/** A verified module that cannot start: the verifier accepts parameters on an entry block, and the
    executor enters that block with no values. */
module ExecutorEntryBlocks {
  import opened Common
  import opened Jir
  import opened Dominators
  import opened JirVerifier
  import opened Execution
  import opened ExecutorSafety

  function Entry(): Function {
    Function(ENTRY_NAME, Export, [], 0, [Block([TypedValue(0, 0)], [], Return(Some(0)))])
  }

  /** An entry point that returns the parameter of its own entry block. */
  function Program(): Module { Module([IntegerType(true, 32)], [Entry()]) }

  lemma ProgramVerified()
    ensures Verified(Program(), [[{0}]])
  {
    var m, f, table := Program(), Entry(), [{0}];
    assert DefinesAt(f, 0, 0, BlockParameter(0, 0));
    assert Uses(f, table, 0, 0, UseSite(0, 0));
    assert TerminatorVerified(m, f, table, f.blocks[0].terminator, UseSite(0, 0));
    assert BlockVerified(m, f, table, 0);
    assert IsDominatorTable(table, Predecessors(f));
    assert FunctionVerified(m, f, table);
  }

  /** The module is verified, yet every run of it ends in a mismatch at its first step. */
  lemma EntryBlockParametersNeverStart(steps: nat)
    requires steps > 0
    ensures Verified(Program(), [[{0}]])
    ensures RunEntry(Program(), steps) == Run(Err(IncomingMismatch), steps - 1)
  {
    ProgramVerified();
    assert EntryIndex(Program().functions) == 0;
    EntryParametersMismatch(Program(), 0, [], steps);
  }
}
