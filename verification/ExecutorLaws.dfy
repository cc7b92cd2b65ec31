/** What the executor's steps mean for each other: memory, aggregates, binding and control flow. */
module ExecutorLaws {
  import opened Bits
  import opened Common
  import opened Jir
  import opened Execution
  import opened ExecutorArithmetic

  // ----- memory -----

  /** Loading after a store through the same pointer yields the stored value; every other slot keeps
      what it held. */
  lemma LoadAfterStore(m: Module, frame: Frame, p: ValueId, v: ValueId, other: nat)
    requires EvaluateInstruction(m, Instruction(None, Store(p, v)), frame).Ok?
    ensures var memory := EvaluateInstruction(m, Instruction(None, Store(p, v)), frame).value.1;
            && p in frame.values && frame.values[p].PointerValue? && v in frame.values
            && EvaluateInstruction(m, Instruction(None, Load(p)), frame.(memory := memory))
            == Ok((Some(frame.values[v]), memory))
            && (other < |frame.memory| && other != frame.values[p].slot ==> memory[other] == frame.memory[other])
            && |memory| == |frame.memory|
  {
  }

  /** A stack allocation returns a slot no existing pointer denotes, uninitialized, and keeps the rest. */
  lemma AllocationIsFresh(m: Module, frame: Frame, ty: TypeId, p: ValueId)
    ensures var r := EvaluateInstruction(m, Instruction(None, StackAlloc(ty, None)), frame);
            && r.Ok? && r.value.0 == Some(PointerValue(|frame.memory|))
            && r.value.1[..|frame.memory|] == frame.memory
            && EvaluateInstruction(m, Instruction(None, Load(p)),
                 Bind(frame.(memory := r.value.1), TypedValue(p, 0), r.value.0.value)) == Err(UninitializedLoad)
  {
  }

  /** Allocating, storing and loading through three instructions gives the stored value back in one
      new slot, and touches nothing else. */
  lemma SlotRoundTrip(m: Module, frame: Frame, ty: TypeId, p: TypedValue, v: ValueId, r: TypedValue, steps: nat)
    requires v in frame.values && v != p.id && steps >= 3
    ensures var program := [Instruction(Some(p), StackAlloc(ty, None)), Instruction(None, Store(p.id, v)),
                            Instruction(Some(r), Load(p.id))];
            var run := RunInstructions(m, program, frame, steps);
            && run.outcome.Ok? && run.steps == steps - 3
            && run.outcome.value
            == Bind(Bind(frame.(memory := frame.memory + [Some(frame.values[v])]), p, PointerValue(|frame.memory|)),
                    r, frame.values[v])
  {
    var store, load := Instruction(None, Store(p.id, v)), Instruction(Some(r), Load(p.id));
    var program := [Instruction(Some(p), StackAlloc(ty, None)), store, load];
    var slot := |frame.memory|;
    var grown := Bind(frame.(memory := frame.memory + [None]), p, PointerValue(slot));
    var stored := grown.(memory := frame.memory + [Some(frame.values[v])]);
    assert program[1..] == [store, load] && [store, load][1..] == [load] && [load][1..] == [];
    assert (frame.memory + [None])[slot := Some(frame.values[v])] == stored.memory;
    assert RunInstructions(m, [load], stored, steps - 2) == Run(Ok(Bind(stored, r, frame.values[v])), steps - 3);
    assert RunInstructions(m, [store, load], grown, steps - 1)
        == RunInstructions(m, [load], stored, steps - 2);
  }

  // ----- aggregates -----

  lemma {:induction false} CollectedInOrder(frame: Frame, ids: seq<ValueId>, i: nat)
    requires CollectValues(frame, ids).Ok? && i < |ids|
    ensures |CollectValues(frame, ids).value| == |ids| && ids[i] in frame.values
    ensures CollectValues(frame, ids).value[i] == frame.values[ids[i]]
  {
    if |ids| > 1 {
      CollectedInOrder(frame, ids[1..], if i > 0 then i - 1 else 0);
    } else {
      assert ids[1..] == [];
    }
  }

  /** Extracting field `i` of an aggregate yields the `i`-th element it was built from. */
  lemma ExtractAfterAggregate(m: Module, frame: Frame, elements: seq<ValueId>, a: ValueId, i: nat)
    requires EvaluateInstruction(m, Instruction(None, Aggregate(elements)), frame).Ok? && i < |elements|
    ensures var built := EvaluateInstruction(m, Instruction(None, Aggregate(elements)), frame).value.0;
            && built.Some? && elements[i] in frame.values
            && EvaluateInstruction(m, Instruction(None, ExtractValue(a, i)),
                 Bind(frame, TypedValue(a, 0), built.value)) == Ok((Some(frame.values[elements[i]]), frame.memory))
  {
    CollectedInOrder(frame, elements, i);
  }

  // ----- binding -----

  ghost predicate DistinctIds(targets: seq<TypedValue>) {
    forall i, j :: 0 <= i < j < |targets| ==> targets[i].id != targets[j].id
  }

  ghost predicate SameAt(a: Frame, b: Frame, v: ValueId) {
    && (v in a.values <==> v in b.values) && (v in a.values ==> a.values[v] == b.values[v])
    && (v in a.types <==> v in b.types) && (v in a.types ==> a.types[v] == b.types[v])
  }

  ghost predicate HoldsAt(frame: Frame, target: TypedValue, value: Value) {
    && target.id in frame.values && frame.values[target.id] == value
    && target.id in frame.types && frame.types[target.id] == target.ty
  }

  lemma {:induction false} UnboundUnchanged(frame: Frame, targets: seq<TypedValue>, values: seq<Value>, v: ValueId)
    requires |targets| == |values| && forall i :: 0 <= i < |targets| ==> targets[i].id != v
    ensures SameAt(BindAll(frame, targets, values), frame, v)
    decreases targets
  {
    if targets != [] { UnboundUnchanged(Bind(frame, targets[0], values[0]), targets[1..], values[1..], v); }
  }

  /** Parameters receive the arguments by position, with their declared types. */
  lemma {:induction false} BoundByPosition(frame: Frame, targets: seq<TypedValue>, values: seq<Value>, i: nat)
    requires |targets| == |values| && DistinctIds(targets) && i < |targets|
    ensures HoldsAt(BindAll(frame, targets, values), targets[i], values[i])
    decreases targets
  {
    var first := Bind(frame, targets[0], values[0]);
    if i == 0 {
      UnboundUnchanged(first, targets[1..], values[1..], targets[0].id);
    } else {
      BoundByPosition(first, targets[1..], values[1..], i - 1);
    }
  }

  // ----- control flow -----

  /** Two empty blocks that jump to one join with `x` and with `y`. */
  predicate IsDiamond(f: Function, left: BlockId, right: BlockId, join: BlockId, x: ValueId, y: ValueId, p: TypedValue) {
    && left < |f.blocks| && f.blocks[left] == Block([], [], Jump(join, [x]))
    && right < |f.blocks| && f.blocks[right] == Block([], [], Jump(join, [y]))
    && join < |f.blocks| && f.blocks[join].parameters == [p]
  }

  /** Branching around a diamond enters the join in the very state a selection into the join's
      parameter gives: the value of `x` exactly when the condition holds. */
  lemma DiamondIsSelect(m: Module, f: Function, frame: Frame, c: ValueId, left: BlockId, right: BlockId,
                        join: BlockId, x: ValueId, y: ValueId, p: TypedValue, steps: nat)
    requires IsDiamond(f, left, right, join, x, y, p) && steps >= 2
    requires c in frame.values && frame.values[c].BoolValue? && x in frame.values && y in frame.values
    ensures var selected := RunInstructions(m, [Instruction(Some(p), Select(c, x, y))], frame, 1);
            && selected.outcome == Ok(Bind(frame, p, frame.values[if frame.values[c].flag then x else y]))
            && RunTerminator(m, f, Branch(c, left, [], right, []), frame, steps)
            == RunBlock(m, f, f.blocks[join], selected.outcome.value, steps - 2)
  {
    var arm, v := if frame.values[c].flag then left else right, if frame.values[c].flag then x else y;
    var bound := Bind(frame, p, frame.values[v]);
    var select := Instruction(Some(p), Select(c, x, y));
    assert [select][1..] == [] && RunInstructions(m, [select], frame, 1).outcome == Ok(bound);
    JumpPasses(m, f, frame, arm, join, v, p, steps);
  }

  /** An empty block that jumps on with one value costs one step and binds it at the target. */
  lemma JumpPasses(m: Module, f: Function, frame: Frame, arm: BlockId, join: BlockId, v: ValueId, p: TypedValue,
                   steps: nat)
    requires arm < |f.blocks| && f.blocks[arm] == Block([], [], Jump(join, [v])) && v in frame.values
    requires join < |f.blocks| && f.blocks[join].parameters == [p] && steps >= 2
    ensures RunBlocks(m, f, frame, arm, [], steps)
         == RunBlock(m, f, f.blocks[join], Bind(frame, p, frame.values[v]), steps - 2)
  {
    var ids := [v];
    assert ids[1..] == [] && CollectValues(frame, ids) == Ok([frame.values[v]] + []);
    assert [frame.values[v]] + [] == [frame.values[v]];
    var targets, values := [p], [frame.values[v]];
    assert targets[1..] == [] && values[1..] == [];
    assert BindAll(frame, targets, values) == Bind(frame, p, frame.values[v]);
    var block := f.blocks[arm];
    assert BindAll(frame, [], []) == frame && RunInstructions(m, [], frame, steps - 1) == Run(Ok(frame), steps - 1);
    assert RunBlock(m, f, block, frame, steps - 1) == RunTerminator(m, f, block.terminator, frame, steps - 1);
    assert RunTerminator(m, f, block.terminator, frame, steps - 1)
        == RunBlocks(m, f, frame, join, [frame.values[v]], steps - 1);
    assert RunBlocks(m, f, frame, join, values, steps - 1)
        == RunBlock(m, f, f.blocks[join], BindAll(frame, targets, values), steps - 2);
  }

  /** A switch enters the first case whose value is the discriminant modulo 2^bits, and its default
      only when no case is. */
  lemma SwitchDecides(m: Module, frame: Frame, t: Terminator, ty: TypeId, signed: bool, bits: Width, i: nat)
    requires t.Switch? && t.discriminant in frame.values && frame.values[t.discriminant].IntegerValue?
    requires t.discriminant in frame.types && frame.types[t.discriminant] == ty
    requires IntegerShape(m, ty) == Some((signed, bits))
    requires i <= |t.cases|
    requires forall j :: 0 <= j < i ==> t.cases[j].value % Pow2(bits) != frame.values[t.discriminant].word
    requires i < |t.cases| ==> t.cases[i].value % Pow2(bits) == frame.values[t.discriminant].word
    ensures var arguments := if i < |t.cases| then t.cases[i].arguments else t.defaultArguments;
            var target := if i < |t.cases| then t.cases[i].target else t.defaultTarget;
            CollectValues(frame, arguments).Ok? ==>
              Transfer(m, frame, t) == Ok(Enter(target, CollectValues(frame, arguments).value))
  {
    SwitchTakesFirstMatch(t.cases, frame.values[t.discriminant].word, bits);
  }
}
