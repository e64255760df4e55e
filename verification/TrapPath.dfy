/**
  A trap from the interrupted instruction to the resumed one: the entry code, the trap system with its
  handlers and error manager, and the return code, one after the other on the objects themselves.
 */
module TrapPath {
  import opened TrapTypes
  import opened TrapEntry
  import EM = ErrorManager
  import HM = HandlerManager
  import P = Priorities
  import R = Registry

  /** What the entry code leaves in the context of a hart in state `m`. */
  function Interrupted(m: Machine): TrapContext
    requires Hart(m)
  {
    var f := Wrap(m.x[SP] - CONTEXT_SIZE);
    Saved(m.x[SP := f][0 := Slot(m.mem, f, 0)], m.csrs)
  }

  /**
    A whole trap. The hart resumes with what the handlers of its cause, in priority and registration order
    up to the first that handles the trap, left in the context; nothing else in memory changed; and either
    the trap was handled and nothing was reported, or exactly one error was.
   */
  method ServeTrap(hart: RiscvHart, system: HM.TrapSystem) returns (ghost result: R.TrapResult)
    requires hart.Valid() && system.Valid()
    modifies hart, hart.x
    modifies system.errors`panicMode, system.errors`reported, system.errors.log, system.errors.log.buffer
    ensures hart.Valid() && system.Valid()
    ensures var before := Interrupted(old(hart.State()));
            var (ctx, r) := Outcome(old(system.handlers.regs), before);
            && result == r && hart.x[..] == ctx.x[0 := 0][SP := Wrap(ctx.x[SP] + CONTEXT_SIZE)]
            && hart.csrs == old(hart.csrs).(sstatus := ctx.sstatus, sepc := ctx.sepc)
            && system.errors.Abs() ==
               if result == R.TrapHandled then old(system.errors.Abs())
               else EM.ReportStep(old(system.errors.Abs()), HM.UnhandledTrap(ctx))
    ensures result != R.TrapHandled ==>
              var n := |old(system.errors.reported)|;
              && |system.errors.reported| == n + 1 && system.errors.reported[..n] == old(system.errors.reported)
              && HM.Describes(system.errors.reported[n].error,
                              Dispatched(old(system.handlers.regs), Interrupted(old(hart.State()))))
    ensures forall b: word | !Within(b, Wrap(old(hart.x[SP]) - CONTEXT_SIZE), CONTEXT_SIZE) ::
              At(hart.mem, b) == At(old(hart.mem), b)
    ensures R.OfType(old(system.handlers.regs), ToTrapType(old(hart.csrs.scause))) == [] ==>
              result != R.TrapHandled && hart.x[..] == old(hart.x[..]) && hart.csrs == old(hart.csrs)
  {
    hide Slot, Within, At, EM.ReportStep, HM.Describes, HM.UnhandledTrap;
    hide Outcome, P.StableSort, R.Dispatch, ToTrapType, R.OfType;
    ghost var before := Interrupted(hart.State());
    NoHandlers(system.handlers.regs, before);
    hart.TrapEntry();
    var f := hart.x[A0];
    var ctx := hart.ReadContext(f);
    assert ctx == before;
    OutcomeIs(system.handlers.regs, ctx);
    ctx, result := system.HandleTrap(ctx);
    hart.EditContext(f, ctx);
    hart.TrapReturn();
    assert Wrap(f + CONTEXT_SIZE) == old(hart.x[SP]);
  }

  /** With no handler for the cause, dispatch passes and leaves the context alone. */
  lemma NoHandlers(regs: seq<R.Registration>, ctx: TrapContext)
    ensures R.OfType(regs, ToTrapType(ctx.scause)) == [] ==> Outcome(regs, ctx) == (ctx, R.Pass)
  {
  }

  lemma OutcomeIs(regs: seq<R.Registration>, ctx: TrapContext)
    ensures Outcome(regs, ctx) ==
            R.Dispatch(P.StableSort(R.OfType(regs, ToTrapType(ctx.scause)), R.EntryPriority), ctx)
  {
  }
}
