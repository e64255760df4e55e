/**
  The trap handler registry as a state machine: registrations in the order they were made (what dispatch
  goes by) and the handle map (what handles are looked up in).
 */
module Registry {
  import opened Wrappers
  import opened Priorities
  import opened TrapTypes

  const KERNEL: nat := 0
  const SYSTEM: nat := 1

  datatype TrapError = ExecutionFailed | UnrecoverableState
  datatype TrapResult = TrapHandled | Pass | Failed(error: TrapError)
  datatype Protection = KernelLevel | SystemLevel | UserLevel

  /**
    A handler entry. `cell` is the identity of the shared cell it lives in: the owner is kept in that cell,
    so registrations that share the cell share the owner. Nothing else in it changes after registration.
   */
  datatype HandlerEntry = HandlerEntry(
    cell: nat, run: TrapContext -> (TrapContext, TrapResult), priority: nat, description: string,
    protection: Protection, registrar: nat, context: Option<nat>)

  /** A handle names a description and a trap type. */
  datatype Handle = Handle(description: string, trap: TrapType)
  datatype Registration = Registration(trap: TrapType, entry: HandlerEntry) {
    function Key(): Handle { Handle(entry.description, trap) }
  }

  /** `owners` records transfers, by cell. */
  datatype Table = Table(regs: seq<Registration>, handles: map<Handle, HandlerEntry>, owners: map<nat, nat>)

  function Owner(t: Table, e: HandlerEntry): nat { if e.cell in t.owners then t.owners[e.cell] else e.registrar }

  predicate CanBeUnregisteredBy(e: HandlerEntry, owner: nat, id: nat) {
    match e.protection
    case KernelLevel => id == KERNEL
    case SystemLevel => id == KERNEL || id == SYSTEM
    case UserLevel => owner == id || id == KERNEL
  }

  // ---------------------------------------------------------------- selections of registrations

  function Without(regs: seq<Registration>, gone: Registration -> bool): (r: seq<Registration>)
    ensures forall x :: x in r <==> x in regs && !gone(x)
  {
    if regs == [] then []
    else
      assert regs == [regs[0]] + regs[1..];
      if gone(regs[0]) then Without(regs[1..], gone) else [regs[0]] + Without(regs[1..], gone)
  }

  /** Same list of priority `p` and same description: what removal from a dispatch list goes by. */
  predicate SameSlot(r: Registration, p: nat, d: string) { r.entry.priority == p && r.entry.description == d }

  function OfType(regs: seq<Registration>, trap: TrapType): seq<HandlerEntry> {
    if regs == [] then []
    else (if regs[0].trap == trap then [regs[0].entry] else []) + OfType(regs[1..], trap)
  }

  /** Lowest trap type, in declaration order, with an entry in that slot; 16 if there is none. */
  ghost function FirstType(regs: seq<Registration>, p: nat, d: string, from: nat := 0): (i: nat)
    ensures from <= i
    ensures i < TRAP_TYPES ==> exists r :: r in regs && SameSlot(r, p, d) && Index(r.trap) == i
    ensures forall r | r in regs && SameSlot(r, p, d) && from <= Index(r.trap) :: i <= Index(r.trap)
    decreases TRAP_TYPES - from
  {
    if from >= TRAP_TYPES then from
    else if exists r :: r in regs && SameSlot(r, p, d) && Index(r.trap) == from then from
    else FirstType(regs, p, d, from + 1)
  }

  // ---------------------------------------------------------------- the steps

  function Register(t: Table, trap: TrapType, e: HandlerEntry): (Table, Option<Handle>) {
    var h := Handle(e.description, trap);
    if h in t.handles then (t, None)
    else (t.(regs := t.regs + [Registration(trap, e)], handles := t.handles[h := e]), Some(h))
  }

  /** The handle leaves the map; what leaves dispatch is the slot of the *first* trap type that has it. */
  ghost function Unregister(t: Table, h: Handle, id: nat): (Table, bool) {
    if h !in t.handles || !CanBeUnregisteredBy(t.handles[h], Owner(t, t.handles[h]), id) then (t, false)
    else
      var p, d := t.handles[h].priority, t.handles[h].description;
      var i := FirstType(t.regs, p, d);
      if i >= TRAP_TYPES then (t, false)
      else (t.(regs := Without(t.regs, (r: Registration) => Index(r.trap) == i && SameSlot(r, p, d)),
               handles := t.handles - {h}), true)
  }

  function TransferOwnership(t: Table, h: Handle, current: nat, owner: nat): (Table, bool) {
    if h !in t.handles then (t, false)
    else if Owner(t, t.handles[h]) != current && current != KERNEL then (t, false)
    else (t.(owners := t.owners[t.handles[h].cell := owner]), true)
  }

  function HandlesOf(t: Table, context: nat): set<Handle> {
    set h | h in t.handles && t.handles[h].context == Some(context)
  }

  /** In the slot of some entry of that context. */
  ghost predicate Doomed(t: Table, context: nat, r: Registration) {
    exists h :: h in HandlesOf(t, context) && SameSlot(r, t.handles[h].priority, t.handles[h].description)
  }

  ghost function UnregisterForContext(t: Table, context: nat): Table {
    t.(regs := Without(t.regs, (r: Registration) => Doomed(t, context, r)),
       handles := t.handles - HandlesOf(t, context))
  }

  // ---------------------------------------------------------------- agreement of the two indices

  /** Dispatch list and handle map hold the same entries, once each. */
  ghost predicate Agree(t: Table) {
    && (forall r | r in t.regs :: r.Key() in t.handles && t.handles[r.Key()] == r.entry)
    && (forall h | h in t.handles ::
          Registration(h.trap, t.handles[h]) in t.regs && t.handles[h].description == h.description)
    && Distinct(t.regs)
  }

  ghost predicate Distinct(regs: seq<Registration>) {
    forall i, j | 0 <= i < j < |regs| :: regs[i].Key() != regs[j].Key()
  }

  /** No description is registered under two trap types. */
  ghost predicate OneType(regs: seq<Registration>) {
    forall r, s | r in regs && s in regs && r.entry.description == s.entry.description :: r.trap == s.trap
  }

  lemma {:induction false} WithoutDistinct(regs: seq<Registration>, gone: Registration -> bool)
    requires Distinct(regs)
    ensures Distinct(Without(regs, gone))
  {
    if regs != [] {
      WithoutDistinct(regs[1..], gone);
      var rest := Without(regs[1..], gone);
      forall i | 0 <= i < |rest| ensures rest[i].Key() != regs[0].Key() {
        assert rest[i] in rest;
        var j :| 0 <= j < |regs[1..]| && regs[1..][j] == rest[i];
        assert regs[j + 1] == rest[i];
      }
    }
  }

  lemma SameKey(t: Table, r: Registration, s: Registration)
    requires Agree(t) && r in t.regs && s in t.regs && r.Key() == s.Key()
    ensures r == s
  {
  }

  lemma RegisterAgrees(t: Table, trap: TrapType, e: HandlerEntry)
    requires Agree(t)
    ensures Agree(Register(t, trap, e).0)
  {
    var t' := Register(t, trap, e).0;
    if Handle(e.description, trap) !in t.handles {
      var r := Registration(trap, e);
      assert r in t'.regs;
      forall i | 0 <= i < |t.regs| ensures t.regs[i].Key() != r.Key() { assert t.regs[i] in t.regs; }
    }
  }

  /** Removing one registration by its handle from both indices. */
  ghost function Removed(t: Table, h: Handle): Table {
    t.(regs := Without(t.regs, (r: Registration) => r.Key() == h), handles := t.handles - {h})
  }

  lemma RemovedAgrees(t: Table, h: Handle)
    requires Agree(t)
    ensures Agree(Removed(t, h))
  {
    WithoutDistinct(t.regs, (r: Registration) => r.Key() == h);
    var t' := Removed(t, h);
    forall g | g in t'.handles ensures Registration(g.trap, t'.handles[g]) in t'.regs {
      assert Registration(g.trap, t.handles[g]) in t.regs;
      assert Registration(g.trap, t.handles[g]).Key() == g;
    }
  }

  lemma {:induction false} WithoutSame(regs: seq<Registration>, f: Registration -> bool, g: Registration -> bool)
    requires forall r | r in regs :: f(r) == g(r)
    ensures Without(regs, f) == Without(regs, g)
  {
    if regs != [] {
      assert regs == [regs[0]] + regs[1..];
      WithoutSame(regs[1..], f, g);
    }
  }

  /**
    `unregister` removes exactly the named entry if and only if no lower trap type has an entry of the same
    priority and description.
   */
  lemma UnregisterExact(t: Table, h: Handle, id: nat)
    requires Agree(t) && h in t.handles && CanBeUnregisteredBy(t.handles[h], Owner(t, t.handles[h]), id)
    ensures Unregister(t, h, id).1
    ensures Unregister(t, h, id).0 == Removed(t, h) <==>
            !exists r :: r in t.regs && SameSlot(r, t.handles[h].priority, h.description)
                         && Index(r.trap) < Index(h.trap)
  {
    var e := t.handles[h];
    var own := Registration(h.trap, e);
    assert own in t.regs && SameSlot(own, e.priority, e.description);
    var i := FirstType(t.regs, e.priority, e.description);
    var gone := (r: Registration) => Index(r.trap) == i && SameSlot(r, e.priority, e.description);
    var named := (r: Registration) => r.Key() == h;
    if i == Index(h.trap) {
      forall r | r in t.regs ensures gone(r) == named(r) {
        if gone(r) { IndexInjective(r.trap, h.trap); }
        if named(r) { SameKey(t, r, own); }
      }
      WithoutSame(t.regs, gone, named);
    } else {
      assert own in Without(t.regs, gone) && own !in Without(t.regs, named);
      var r :| r in t.regs && SameSlot(r, e.priority, e.description) && Index(r.trap) == i;
    }
  }

  /**
    Which registrations leave on a successful `unregister`: those in the named priority and description
    for which no registration of that slot has a lower trap type, whoever registered them.
   */
  lemma LeavesOnUnregister(t: Table, h: Handle, id: nat, r: Registration)
    requires r in t.regs && Unregister(t, h, id).1
    ensures var p, d := t.handles[h].priority, t.handles[h].description;
            r !in Unregister(t, h, id).0.regs <==>
            SameSlot(r, p, d) && forall q | q in t.regs && SameSlot(q, p, d) :: Index(r.trap) <= Index(q.trap)
  {
    hide Index;
    var p, d := t.handles[h].priority, t.handles[h].description;
    var i := FirstType(t.regs, p, d);
    var q :| q in t.regs && SameSlot(q, p, d) && Index(q.trap) == i;
  }

  lemma IndexInjective(a: TrapType, b: TrapType)
    requires Index(a) == Index(b)
    ensures a == b
  {
  }

  /** When each description has one trap type, that is always the case. */
  lemma UnregisterOneType(t: Table, h: Handle, id: nat)
    requires Agree(t) && OneType(t.regs)
    ensures Unregister(t, h, id).0 == if Unregister(t, h, id).1 then Removed(t, h) else t
    ensures Unregister(t, h, id).1 <==> h in t.handles && CanBeUnregisteredBy(t.handles[h], Owner(t, t.handles[h]), id)
  {
    if h in t.handles && CanBeUnregisteredBy(t.handles[h], Owner(t, t.handles[h]), id) {
      UnregisterExact(t, h, id);
      var own := Registration(h.trap, t.handles[h]);
      assert own in t.regs;
    }
  }

  /** What should remain after a context goes away. */
  ghost function ContextGone(t: Table, context: nat): Table {
    t.(regs := Without(t.regs, (r: Registration) => r.entry.context == Some(context)),
       handles := t.handles - HandlesOf(t, context))
  }

  /**
    `unregister_for_context` removes exactly that context's entries if and only if no other entry has the
    priority and the description of one of them.
   */
  lemma ContextExact(t: Table, context: nat)
    requires Agree(t)
    ensures UnregisterForContext(t, context) == ContextGone(t, context) <==>
            !exists r, s :: r in t.regs && s in t.regs && r.entry.context == Some(context)
                            && s.entry.context != Some(context)
                            && SameSlot(s, r.entry.priority, r.entry.description)
  {
    var doomed := (r: Registration) => Doomed(t, context, r);
    var mine := (r: Registration) => r.entry.context == Some(context);
    forall r | r in t.regs && mine(r) ensures doomed(r) {
      assert r.Key() in HandlesOf(t, context);
    }
    if s :| s in t.regs && doomed(s) && !mine(s) {
      var h :| h in HandlesOf(t, context) && SameSlot(s, t.handles[h].priority, t.handles[h].description);
      var r := Registration(h.trap, t.handles[h]);
      assert r in t.regs && SameSlot(s, r.entry.priority, r.entry.description);
      assert s in Without(t.regs, mine) && s !in Without(t.regs, doomed);
    } else {
      WithoutSame(t.regs, doomed, mine);
      forall r, s | r in t.regs && s in t.regs && mine(r) && !mine(s)
        ensures !SameSlot(s, r.entry.priority, r.entry.description)
      {
        assert r.Key() in HandlesOf(t, context);
        assert !doomed(s);
      }
    }
  }

  lemma ContextOneType(t: Table, context: nat)
    requires Agree(t) && OneType(t.regs)
    ensures UnregisterForContext(t, context) == ContextGone(t, context) && Agree(ContextGone(t, context))
  {
    ContextExact(t, context);
    forall r, s | r in t.regs && s in t.regs && SameSlot(s, r.entry.priority, r.entry.description) ensures r == s {
      SameKey(t, r, s);
    }
    WithoutDistinct(t.regs, (r: Registration) => r.entry.context == Some(context));
    var t' := ContextGone(t, context);
    forall h | h in t'.handles ensures Registration(h.trap, t'.handles[h]) in t'.regs {
      assert Registration(h.trap, t.handles[h]) in t.regs;
    }
  }

  // ---------------------------------------------------------------- runs

  datatype Op = RegisterOp(trap: TrapType, entry: HandlerEntry) | UnregisterOp(handle: Handle, id: nat)
              | TransferOp(handle: Handle, current: nat, owner: nat) | ContextOp(context: nat)

  ghost function Step(t: Table, op: Op): Table {
    match op
    case RegisterOp(trap, e) => Register(t, trap, e).0
    case UnregisterOp(h, id) => Unregister(t, h, id).0
    case TransferOp(h, current, owner) => TransferOwnership(t, h, current, owner).0
    case ContextOp(context) => UnregisterForContext(t, context)
  }

  ghost function Run(t: Table, ops: seq<Op>): Table
    decreases |ops|
  {
    if ops == [] then t else Run(Step(t, ops[0]), ops[1..])
  }

  /** Nobody registers a description that is in use under another trap type. */
  ghost predicate Allowed(t: Table, op: Op) {
    op.RegisterOp? ==>
      forall r | r in t.regs && r.entry.description == op.entry.description :: r.trap == op.trap
  }

  ghost predicate Disciplined(t: Table, ops: seq<Op>)
    decreases |ops|
  {
    ops == [] || (Allowed(t, ops[0]) && Disciplined(Step(t, ops[0]), ops[1..]))
  }

  lemma StepAgrees(t: Table, op: Op)
    requires Agree(t) && OneType(t.regs) && Allowed(t, op)
    ensures Agree(Step(t, op)) && OneType(Step(t, op).regs)
  {
    match op
    case RegisterOp(trap, e) =>
      RegisterAgrees(t, trap, e);
      forall r, s | r in Step(t, op).regs && s in Step(t, op).regs && r.entry.description == s.entry.description
        ensures r.trap == s.trap
      {
        assert r in t.regs || r == Registration(trap, e);
        assert s in t.regs || s == Registration(trap, e);
      }
    case UnregisterOp(h, id) =>
      UnregisterOneType(t, h, id);
      RemovedAgrees(t, h);
    case TransferOp(h, current, owner) =>
    case ContextOp(context) =>
      ContextOneType(t, context);
  }

  /** Over every disciplined run the dispatch lists and the handle map hold the same entries, once each. */
  lemma {:induction false} RunAgrees(t: Table, ops: seq<Op>)
    requires Agree(t) && OneType(t.regs) && Disciplined(t, ops)
    ensures Agree(Run(t, ops)) && OneType(Run(t, ops).regs)
    decreases |ops|
  {
    if ops != [] {
      StepAgrees(t, ops[0]);
      RunAgrees(Step(t, ops[0]), ops[1..]);
    }
  }

  /** Who may unregister the entry: the kernel, the system for what is not the kernel's, and the current owner. */
  predicate Entitled(t: Table, e: HandlerEntry, id: nat) {
    || id == 0
    || (id == 1 && e.protection == SystemLevel)
    || (id == Owner(t, e) && e.protection == UserLevel)
  }

  /** `unregister` succeeds exactly for known handles and those entitled to them. */
  lemma UnregisterPermitted(t: Table, h: Handle, id: nat)
    requires Agree(t)
    ensures Unregister(t, h, id).1 <==> h in t.handles && Entitled(t, t.handles[h], id)
    ensures !Unregister(t, h, id).1 ==> Unregister(t, h, id).0 == t
  {
    hide Agree, Entitled;
    EntitledCan(t, h, id);
    if h in t.handles && Entitled(t, t.handles[h], id) {
      UnregisterExact(t, h, id);
    }
  }

  lemma EntitledCan(t: Table, h: Handle, id: nat)
    ensures h in t.handles ==> (Entitled(t, t.handles[h], id) <==>
              CanBeUnregisteredBy(t.handles[h], Owner(t, t.handles[h]), id))
  {
  }

  /** Nobody entitled to the entry at the time unregisters anything in the run, and its context stays. */
  ghost predicate LeftAlone(t: Table, ops: seq<Op>, r: Registration)
    decreases |ops|
  {
    ops == [] ||
    (&& (ops[0].UnregisterOp? ==> !Entitled(t, r.entry, ops[0].id))
     && (ops[0].ContextOp? ==> r.entry.context != Some(ops[0].context))
     && LeftAlone(Step(t, ops[0]), ops[1..], r))
  }

  /**
    An entry of any protection outlives every disciplined run in which nobody entitled to it, by protection
    and by ownership at the time, unregisters anything and its context does not go away.
   */
  lemma {:induction false} EntrySurvives(t: Table, ops: seq<Op>, r: Registration)
    requires Agree(t) && OneType(t.regs) && Disciplined(t, ops) && r in t.regs && LeftAlone(t, ops, r)
    ensures r in Run(t, ops).regs && r.Key() in Run(t, ops).handles && Run(t, ops).handles[r.Key()] == r.entry
    decreases |ops|
  {
    hide Entitled;
    if ops != [] {
      StepAgrees(t, ops[0]);
      assert r in Step(t, ops[0]).regs by { SurvivesStep(t, ops[0], r); }
      EntrySurvives(Step(t, ops[0]), ops[1..], r);
    }
  }

  lemma SurvivesStep(t: Table, op: Op, r: Registration)
    requires Agree(t) && OneType(t.regs) && r in t.regs
    requires op.UnregisterOp? ==> !Entitled(t, r.entry, op.id)
    requires op.ContextOp? ==> r.entry.context != Some(op.context)
    ensures r in Step(t, op).regs
  {
    hide Entitled;
    match op
    case RegisterOp(trap, e) =>
    case UnregisterOp(h, id) =>
      UnregisterOneType(t, h, id);
      UnregisterPermitted(t, h, id);
      if Unregister(t, h, id).1 { assert r.Key() != h; }
    case TransferOp(h, current, owner) =>
    case ContextOp(context) =>
      ContextOneType(t, context);
  }

  /** In particular a kernel-level entry without a context needs only the kernel to leave it alone. */
  lemma {:induction false} KernelEntrySurvives(t: Table, ops: seq<Op>, r: Registration)
    requires Agree(t) && OneType(t.regs) && Disciplined(t, ops)
    requires r in t.regs && r.entry.protection == KernelLevel && r.entry.context == None
    requires forall i | 0 <= i < |ops| && ops[i].UnregisterOp? :: ops[i].id != 0
    ensures r in Run(t, ops).regs && r.Key() in Run(t, ops).handles && Run(t, ops).handles[r.Key()] == r.entry
  {
    KernelLeftAlone(t, ops, r);
    EntrySurvives(t, ops, r);
  }

  lemma {:induction false} KernelLeftAlone(t: Table, ops: seq<Op>, r: Registration)
    requires r.entry.protection == KernelLevel && r.entry.context == None
    requires forall i | 0 <= i < |ops| && ops[i].UnregisterOp? :: ops[i].id != 0
    ensures LeftAlone(t, ops, r)
    decreases |ops|
  {
    hide Step;
    if ops != [] { KernelLeftAlone(Step(t, ops[0]), ops[1..], r); }
  }

  /** A system-level one needs the kernel and the system to. */
  lemma {:induction false} SystemEntrySurvives(t: Table, ops: seq<Op>, r: Registration)
    requires Agree(t) && OneType(t.regs) && Disciplined(t, ops)
    requires r in t.regs && r.entry.protection == SystemLevel && r.entry.context == None
    requires forall i | 0 <= i < |ops| && ops[i].UnregisterOp? :: ops[i].id != 0 && ops[i].id != 1
    ensures r in Run(t, ops).regs && r.Key() in Run(t, ops).handles && Run(t, ops).handles[r.Key()] == r.entry
  {
    SystemLeftAlone(t, ops, r);
    EntrySurvives(t, ops, r);
  }

  lemma {:induction false} SystemLeftAlone(t: Table, ops: seq<Op>, r: Registration)
    requires r.entry.protection == SystemLevel && r.entry.context == None
    requires forall i | 0 <= i < |ops| && ops[i].UnregisterOp? :: ops[i].id != 0 && ops[i].id != 1
    ensures LeftAlone(t, ops, r)
    decreases |ops|
  {
    hide Step;
    if ops != [] { SystemLeftAlone(Step(t, ops[0]), ops[1..], r); }
  }

  /**
    A transfer succeeds exactly when the owner or the kernel asks for it. Of a user-level entry exactly the new
    owner and the kernel can then unregister it; owners in other cells stay.
   */
  lemma TransferMoves(t: Table, h: Handle, current: nat, owner: nat, id: nat, e: HandlerEntry)
    requires Agree(t)
    ensures var (t', ok) := TransferOwnership(t, h, current, owner);
            && (ok <==> h in t.handles && (current == Owner(t, t.handles[h]) || current == 0))
            && (!ok ==> t' == t)
            && (ok ==> t'.regs == t.regs && t'.handles == t.handles && Owner(t', t.handles[h]) == owner
                       && (e.cell != t.handles[h].cell ==> Owner(t', e) == Owner(t, e))
                       && (t.handles[h].protection == UserLevel ==>
                             (Unregister(t', h, id).1 <==> id == owner || id == 0)))
  {
    var (t', ok) := TransferOwnership(t, h, current, owner);
    if ok {
      UnregisterPermitted(t', h, id);
    }
  }

  /** Registering fails exactly for a duplicate; otherwise the handle names the entry, last of its type. */
  lemma RegisterNames(t: Table, trap: TrapType, e: HandlerEntry)
    ensures var (t', r) := Register(t, trap, e);
            && (r.None? <==> Handle(e.description, trap) in t.handles) && (r.None? ==> t' == t)
            && (r.Some? ==> r.value !in t.handles && t'.handles == t.handles[r.value := e]
                            && OfType(t'.regs, trap) == OfType(t.regs, trap) + [e]
                            && forall u | u != trap :: OfType(t'.regs, u) == OfType(t.regs, u))
  {
    var x := [Registration(trap, e)];
    assert x[1..] == [];
    forall u ensures OfType(t.regs + x, u) == OfType(t.regs, u) + if u == trap then [e] else [] {
      OfTypeConcat(t.regs, x, u);
    }
  }

  lemma {:induction false} OfTypeConcat(a: seq<Registration>, b: seq<Registration>, trap: TrapType)
    ensures OfType(a + b, trap) == OfType(a, trap) + OfType(b, trap)
  {
    if a == [] {
      assert a + b == b;
    } else {
      assert (a + b)[0] == a[0] && (a + b)[1..] == a[1..] + b;
      OfTypeConcat(a[1..], b, trap);
    }
  }

  /**
    The discipline is needed. With one entry under the three page-fault types, as the default registration
    makes them, unregistering the load-fault handle silences instruction faults and leaves load faults dispatched.
   */
  lemma SharedDescriptionMisfires(e: HandlerEntry)
    requires e.protection == KernelLevel
    ensures var t0 := Table([], map[], map[]);
            var two := Register(Register(t0, LoadPageFault, e).0, StorePageFault, e).0;
            var t1 := Register(two, InstructionPageFault, e).0;
            var (t2, ok) := Unregister(t1, Handle(e.description, LoadPageFault), KERNEL);
            && ok && Agree(t1) && !Agree(t2)
            && Registration(LoadPageFault, e) in t2.regs && Registration(InstructionPageFault, e) !in t2.regs
            && Handle(e.description, LoadPageFault) !in t2.handles
            && Handle(e.description, InstructionPageFault) in t2.handles
  {
    var l, s := Registration(LoadPageFault, e), Registration(StorePageFault, e);
    var x := Registration(InstructionPageFault, e);
    ThreeRegistered(e, l, s, x);
    ThreeAgree(e);
    var t1 := Table([l, s, x], map[l.Key() := e, s.Key() := e, x.Key() := e], map[]);
    UnregisterMiddle(t1, e, l, s, x);
  }

  /**
    It is needed for kernel-level entries too: while `k` has the lowest trap type of its slot, any owner's
    user-level entry that joins the slot under a higher trap type takes `k` with it when its owner
    unregisters it, and stays in dispatch itself.
   */
  lemma SharedSlotEvicts(t: Table, k: Registration, trap: TrapType, e: HandlerEntry)
    requires k in t.regs && Index(k.trap) < Index(trap) && Handle(e.description, trap) !in t.handles
    requires SameSlot(k, e.priority, e.description) && e.protection == UserLevel && e.cell !in t.owners
    requires forall q | q in t.regs && SameSlot(q, e.priority, e.description) :: Index(k.trap) <= Index(q.trap)
    ensures var t1 := Register(t, trap, e).0;
            var (t2, ok) := Unregister(t1, Handle(e.description, trap), e.registrar);
            ok && k !in t2.regs && Registration(trap, e) in t2.regs
  {
    hide Index;
    var t1, h, own := Register(t, trap, e).0, Handle(e.description, trap), Registration(trap, e);
    assert own in t1.regs && k in t1.regs;
    assert SameSlot(own, e.priority, e.description);
    assert Unregister(t1, h, e.registrar).1;
    LeavesOnUnregister(t1, h, e.registrar, k);
    LeavesOnUnregister(t1, h, e.registrar, own);
  }

  /**
    Likewise for contexts: an entry of context `context` that joins the slot of `k` takes `k`, which belongs
    to no or another context, out of dispatch when its context goes away, and leaves the handle of `k` behind.
   */
  lemma ContextEvicts(
      t: Table, k: Registration, trap: TrapType, e: HandlerEntry, context: nat)
    requires Agree(t) && k in t.regs && k.trap != trap && k.entry.context != Some(context)
    requires e.context == Some(context) && SameSlot(k, e.priority, e.description)
    requires Handle(e.description, trap) !in t.handles
    ensures var t2 := UnregisterForContext(Register(t, trap, e).0, context);
            k !in t2.regs && k.Key() in t2.handles && !Agree(t2)
  {
    var t1, h := Register(t, trap, e).0, Handle(e.description, trap);
    var t2 := UnregisterForContext(t1, context);
    assert h in HandlesOf(t1, context) && t1.handles[h] == e;
    assert Doomed(t1, context, k);
    assert t2.handles[k.Key()] == k.entry;
    assert Registration(k.Key().trap, k.entry) == k;
  }

  lemma ThreeRegistered(e: HandlerEntry, l: Registration, s: Registration, x: Registration)
    requires l == Registration(LoadPageFault, e) && s == Registration(StorePageFault, e)
    requires x == Registration(InstructionPageFault, e)
    ensures var t0 := Table([], map[], map[]);
            Register(Register(Register(t0, LoadPageFault, e).0, StorePageFault, e).0, InstructionPageFault, e).0
            == Table([l, s, x], map[l.Key() := e, s.Key() := e, x.Key() := e], map[])
  {
    var t1 := Register(Table([], map[], map[]), LoadPageFault, e).0;
    var t2 := Register(t1, StorePageFault, e).0;
    assert t1.regs == [l] && t2.regs == [l, s];
    assert t2.regs + [x] == [l, s, x];
  }

  lemma ThreeAgree(e: HandlerEntry)
    ensures var t0 := Table([], map[], map[]);
            Agree(Register(Register(Register(t0, LoadPageFault, e).0, StorePageFault, e).0, InstructionPageFault, e).0)
  {
    hide Register;
    var t0 := Table([], map[], map[]);
    var t1 := Register(t0, LoadPageFault, e).0;
    RegisterAgrees(t0, LoadPageFault, e);
    RegisterAgrees(t1, StorePageFault, e);
    RegisterAgrees(Register(t1, StorePageFault, e).0, InstructionPageFault, e);
  }

  lemma UnregisterMiddle(t: Table, e: HandlerEntry, l: Registration, s: Registration,
      x: Registration)
    requires l == Registration(LoadPageFault, e) && s == Registration(StorePageFault, e)
    requires x == Registration(InstructionPageFault, e)
    requires t.regs == [l, s, x] && l.Key() in t.handles && x.Key() in t.handles && t.handles[l.Key()] == e
    requires e.protection == KernelLevel
    ensures var (t2, ok) := Unregister(t, l.Key(), KERNEL);
            ok && !Agree(t2) && l in t2.regs && x !in t2.regs && l.Key() !in t2.handles && x.Key() in t2.handles
  {
    hide Without, FirstType;
    var i := FirstType(t.regs, e.priority, e.description);
    assert x in t.regs && SameSlot(x, e.priority, e.description) && l in t.regs;
    var r :| r in t.regs && SameSlot(r, e.priority, e.description) && Index(r.trap) == i;
    assert r == l || r == s || r == x;
    assert i == Index(x.trap) == 4;
    var t2 := Unregister(t, l.Key(), KERNEL).0;
    assert t2.handles[x.Key()] == t.handles[x.Key()];
    assert forall y | y in t2.regs :: y == l || y == s;
  }

  // ---------------------------------------------------------------- dispatch

  /** A left fold over the handlers that threads the context through and stops at the first that handles the trap. */
  function Dispatch(hs: seq<HandlerEntry>, ctx: TrapContext): (r: (TrapContext, TrapResult))
    ensures !r.1.Failed?
  {
    if hs == [] then (ctx, Pass)
    else
      var (ctx', result) := hs[0].run(ctx);
      if result == TrapHandled then (ctx', TrapHandled) else Dispatch(hs[1..], ctx')
  }

  function EntryPriority(e: HandlerEntry): nat { e.priority }

  /** The entries of one trap type and one priority, in registration order. */
  function Pick(regs: seq<Registration>, trap: TrapType, p: nat): seq<HandlerEntry> {
    if regs == [] then []
    else (if regs[0].trap == trap && regs[0].entry.priority == p then [regs[0].entry] else [])
         + Pick(regs[1..], trap, p)
  }

  lemma {:induction false} PickIsOf(regs: seq<Registration>, trap: TrapType, p: nat)
    ensures Pick(regs, trap, p) == Of(OfType(regs, trap), EntryPriority, p)
  {
    if regs != [] {
      PickIsOf(regs[1..], trap, p);
      if regs[0].trap == trap {
        var t := OfType(regs[1..], trap);
        assert OfType(regs, trap) == [regs[0].entry] + t && ([regs[0].entry] + t)[1..] == t;
      } else {
        assert OfType(regs, trap) == OfType(regs[1..], trap);
      }
    }
  }

  lemma {:induction false} PickConcat(a: seq<Registration>, b: seq<Registration>, trap: TrapType, p: nat)
    ensures Pick(a + b, trap, p) == Pick(a, trap, p) + Pick(b, trap, p)
  {
    if a == [] {
      assert a + b == b;
    } else {
      assert (a + b)[1..] == a[1..] + b;
      PickConcat(a[1..], b, trap, p);
    }
  }

  lemma {:induction false} PickMembers(regs: seq<Registration>, trap: TrapType, p: nat)
    ensures forall i | 0 <= i < |Pick(regs, trap, p)| ::
              Registration(trap, Pick(regs, trap, p)[i]) in regs && Pick(regs, trap, p)[i].priority == p
    ensures forall r | r in regs && r.trap == trap && r.entry.priority == p :: r.entry in Pick(regs, trap, p)
  {
    if regs != [] {
      PickMembers(regs[1..], trap, p);
      assert regs == [regs[0]] + regs[1..];
    }
  }

  function Retain(list: seq<HandlerEntry>, d: string): seq<HandlerEntry> {
    if list == [] then []
    else if list[0].description == d then Retain(list[1..], d) else [list[0]] + Retain(list[1..], d)
  }

  /** Removing a slot of trap type number `i` is retaining in that one list. */
  lemma {:induction false} PickWithout(regs: seq<Registration>, gone: Registration -> bool, i: nat, p: nat,
      d: string, trap: TrapType, q: nat)
    requires forall r | r in regs :: gone(r) <==> Index(r.trap) == i && SameSlot(r, p, d)
    ensures Pick(Without(regs, gone), trap, q) ==
            if Index(trap) == i && q == p then Retain(Pick(regs, trap, q), d) else Pick(regs, trap, q)
  {
    hide Pick, Retain, Index, Without;
    if regs != [] {
      assert regs == [regs[0]] + regs[1..];
      WithoutHead(regs, gone);
      assert forall r | r in regs[1..] :: r in regs;
      PickWithout(regs[1..], gone, i, p, d, trap, q);
      PickCons(regs[0], Without(regs[1..], gone), trap, q);
      PickCons(regs[0], regs[1..], trap, q);
      if regs[0].trap == trap && regs[0].entry.priority == q {
        RetainCons(regs[0].entry, Pick(regs[1..], trap, q), d);
      }
      if regs[0].trap != trap && Index(regs[0].trap) == Index(trap) {
        IndexInjective(regs[0].trap, trap);
      }
    } else {
      PickEmpty(trap, q, d);
    }
  }

  lemma WithoutHead(regs: seq<Registration>, gone: Registration -> bool)
    requires regs != []
    ensures Without(regs, gone) ==
            if gone(regs[0]) then Without(regs[1..], gone) else [regs[0]] + Without(regs[1..], gone)
  {
  }

  lemma PickEmpty(trap: TrapType, q: nat, d: string)
    ensures Pick([], trap, q) == [] == Retain([], d) && forall gone :: Without([], gone) == []
  {
  }

  /** Removing a slot under every trap type is retaining in all lists of that priority. */
  lemma {:induction false} PickWithoutAll(regs: seq<Registration>, gone: Registration -> bool, p: nat,
      d: string, trap: TrapType, q: nat)
    requires forall r | r in regs :: gone(r) <==> SameSlot(r, p, d)
    ensures Pick(Without(regs, gone), trap, q) == if q == p then Retain(Pick(regs, trap, q), d) else Pick(regs, trap, q)
  {
    if regs != [] {
      assert regs == [regs[0]] + regs[1..];
      assert forall r | r in regs[1..] :: r in regs;
      PickWithoutAll(regs[1..], gone, p, d, trap, q);
      PickCons(regs[0], Without(regs[1..], gone), trap, q);
      PickCons(regs[0], regs[1..], trap, q);
      if regs[0].trap == trap && regs[0].entry.priority == q {
        RetainCons(regs[0].entry, Pick(regs[1..], trap, q), d);
      }
    }
  }

  lemma PickCons(r: Registration, rest: seq<Registration>, trap: TrapType, q: nat)
    ensures Pick([r] + rest, trap, q) ==
            if r.trap == trap && r.entry.priority == q then [r.entry] + Pick(rest, trap, q) else Pick(rest, trap, q)
  {
    assert ([r] + rest)[1..] == rest;
  }

  lemma PickOne(r: Registration, trap: TrapType, q: nat)
    ensures Pick([r], trap, q) == if r.trap == trap && r.entry.priority == q then [r.entry] else []
  {
    assert [r][1..] == [];
  }

  lemma RetainCons(e: HandlerEntry, rest: seq<HandlerEntry>, d: string)
    ensures Retain([e] + rest, d) == if e.description == d then Retain(rest, d) else [e] + Retain(rest, d)
  {
    assert ([e] + rest)[1..] == rest;
  }

  lemma {:induction false} WithoutTwice(regs: seq<Registration>, f: Registration -> bool,
      g: Registration -> bool, both: Registration -> bool)
    requires forall r | r in regs :: both(r) == (f(r) || g(r))
    ensures Without(Without(regs, f), g) == Without(regs, both)
  {
    if regs != [] {
      assert regs == [regs[0]] + regs[1..];
      WithoutTwice(regs[1..], f, g, both);
      var rest := Without(regs[1..], f);
      assert ([regs[0]] + rest)[1..] == rest;
    }
  }
}
