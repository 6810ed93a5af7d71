/** The switch over a register index: one case per register and a default, each leaving the switch when done. */
module RegisterDispatch {
  import opened OpcodePaths
  import opened StructuredCode

  const REGISTER_COUNT: nat := 8

  const DEFAULT_REGISTER_CASE: nat := REGISTER_COUNT

  function RegisterIndexDispatchTable(): seq<nat> {
    seq(REGISTER_COUNT, index requires 0 <= index < REGISTER_COUNT => DEFAULT_REGISTER_CASE - index)
  }

  // A case's code ends with a branch out of the blocks of the cases before it.
  function RegisterCases(): (cases: seq<seq<Code>>)
    ensures |cases| == DEFAULT_REGISTER_CASE + 1
    ensures forall k | 0 <= k < |cases| :: cases[k] == [RegisterCase(k), Br(k)]
  {
    seq(DEFAULT_REGISTER_CASE + 1, k requires 0 <= k => [RegisterCase(k), Br(k)])
  }

  function RegisterIndexBranch(): Code {
    BrTable(RegisterIndex, RegisterIndexDispatchTable(), 0)
  }

  /** Exactly the case of the index runs, the default one for an index that is no register's. */
  lemma RegisterSwitchRunsOneCase(height: nat, locals: Locals, bytes: Opcode, fuel: nat)
    ensures ExecOne(Switch(RegisterCases(), RegisterIndexBranch()), height, locals, bytes, fuel) ==
            Next(locals.(ran := locals.ran + [if locals.index < REGISTER_COUNT then locals.index else DEFAULT_REGISTER_CASE]))
  {
    var j := if locals.index < REGISTER_COUNT then locals.index else DEFAULT_REGISTER_CASE;
    assert RegisterCases()[j] == [RegisterCase(j)] + [Br(j)];
    ExecAppend([RegisterCase(j)], [Br(j)], height + 1 + j, locals, bytes, fuel);
    ExecSingle(RegisterCase(j), height + 1 + j, locals, bytes, fuel);
    ExecSingle(Br(j), height + 1 + j, locals.(ran := locals.ran + [j]), bytes, fuel);
    SwitchSelects(RegisterCases(), RegisterIndexBranch(), height, j, locals, bytes, fuel);
  }

  method EmitRegisterIndexSwitch(body: BodyEncoder)
    requires body.open != []
    modifies body
    ensures body.open == Appended(old(body.open), [Switch(RegisterCases(), RegisterIndexBranch())])
  {
    hide Appended;
    ghost var cases := RegisterCases();
    body.OpenSwitch(DEFAULT_REGISTER_CASE + 1, RegisterIndexBranch());
    assert Nest(cases, RegisterIndexBranch(), |cases|) == [RegisterIndexBranch()];
    var caseIndex := DEFAULT_REGISTER_CASE + 1;
    while caseIndex > 0
      invariant 0 <= caseIndex <= |cases|
      invariant body.open == InSwitch(old(body.open), caseIndex, Nest(cases, RegisterIndexBranch(), caseIndex))
    {
      caseIndex := caseIndex - 1;
      body.EndCase(old(body.open), caseIndex, Nest(cases, RegisterIndexBranch(), caseIndex + 1));
      ghost var ended := [Block(Nest(cases, RegisterIndexBranch(), caseIndex + 1))];
      AppendedInSwitch(old(body.open), caseIndex, ended, [RegisterCase(caseIndex)]);
      AppendedInSwitch(old(body.open), caseIndex, ended + [RegisterCase(caseIndex)], [Br(caseIndex)]);
      assert ended + cases[caseIndex] == ended + [RegisterCase(caseIndex)] + [Br(caseIndex)];
      body.Emit(RegisterCase(caseIndex));
      body.Emit(Br(caseIndex));
    }
    body.EndSwitch(old(body.open), Nest(cases, RegisterIndexBranch(), 0));
  }
}
