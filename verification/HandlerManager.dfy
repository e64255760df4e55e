/**
  The heap-based handler manager: a map from trap type to per-priority lists, and a handle map, both updated
  in place; and the trap system that reports what no handler takes.
 */
module HandlerManager {
  import opened Wrappers
  import opened Priorities
  import opened TrapTypes
  import opened Registry
  import opened RingBuffers
  import EM = ErrorManager

  type TrapMap = map<TrapType, Buckets<HandlerEntry>>

  function Lists(m: TrapMap, trap: TrapType): Buckets<HandlerEntry> { if trap in m then m[trap] else map[] }

  /** The lists hold the registrations, trap type by trap type and priority by priority, in order. */
  ghost predicate Represents(m: TrapMap, regs: seq<Registration>) {
    forall trap, p: nat :: Bucket(Lists(m, trap), p) == Pick(regs, trap, p)
  }

  predicate HasDescription(list: seq<HandlerEntry>, d: string) {
    exists i :: 0 <= i < |list| && list[i].description == d
  }

  /** A list mentions the description exactly when some registration is in that slot. */
  lemma ListHasSlot(m: TrapMap, regs: seq<Registration>, trap: TrapType, p: nat, d: string)
    requires Represents(m, regs)
    ensures HasDescription(Bucket(Lists(m, trap), p), d) <==>
            exists r :: r in regs && SameSlot(r, p, d) && r.trap == trap
  {
    var list := Bucket(Lists(m, trap), p);
    assert list == Pick(regs, trap, p);
    PickMembers(regs, trap, p);
    if HasDescription(list, d) {
      var i :| 0 <= i < |list| && list[i].description == d;
      assert Registration(trap, list[i]) in regs && SameSlot(Registration(trap, list[i]), p, d);
    }
    if r :| r in regs && SameSlot(r, p, d) && r.trap == trap {
      assert r.entry in list;
    }
  }

  lemma RegisterRepresents(m: TrapMap, regs: seq<Registration>, trap: TrapType, e: HandlerEntry)
    requires Represents(m, regs)
    ensures Represents(m[trap := Push(Lists(m, trap), e.priority, e)], regs + [Registration(trap, e)])
  {
    hide Pick;
    var m', r := m[trap := Push(Lists(m, trap), e.priority, e)], Registration(trap, e);
    forall tt, p: nat ensures Bucket(Lists(m', tt), p) == Pick(regs + [r], tt, p) {
      PickConcat(regs, [r], tt, p);
      PickOne(r, tt, p);
      assert Bucket(Lists(m, tt), p) == Pick(regs, tt, p);
    }
  }

  /** Replaces one list by what it retains; an emptied list may or may not be kept. */
  function RetainIn(m: TrapMap, trap: TrapType, p: nat, d: string): TrapMap {
    if trap in m && p in m[trap] then
      var lists: Buckets<HandlerEntry> := m[trap];
      var kept: Buckets<HandlerEntry> := lists[p := Retain(lists[p], d)];
      m[trap := kept]
    else m
  }

  function DropEmpty(m: TrapMap, trap: TrapType, p: nat): TrapMap {
    if trap in m && p in m[trap] && |m[trap][p]| == 0 then
      var lists: Buckets<HandlerEntry> := m[trap];
      m[trap := lists - {p}]
    else m
  }

  lemma RetainLists(m: TrapMap, trap: TrapType, p: nat, d: string)
    ensures forall tt, q: nat :: Bucket(Lists(RetainIn(m, trap, p, d), tt), q) ==
              if tt == trap && q == p then Retain(Bucket(Lists(m, tt), q), d) else Bucket(Lists(m, tt), q)
    ensures forall tt, q: nat :: Bucket(Lists(DropEmpty(m, trap, p), tt), q) == Bucket(Lists(m, tt), q)
  {
  }

  class HeapHandlerManager {
    var handlers: TrapMap
    var handleMap: map<Handle, HandlerEntry>
    var owners: map<nat, nat>
    ghost var regs: seq<Registration>

    ghost predicate Valid()
      reads this
    {
      Represents(handlers, regs) && forall r | r in regs :: r.entry.priority < LEVELS
    }

    ghost function Abs(): Table
      reads this
    {
      Table(regs, handleMap, owners)
    }

    constructor ()
      ensures Valid() && Abs() == Table([], map[], map[])
    {
      handlers, handleMap, owners, regs := map[], map[], map[], [];
    }

    function CurrentOwner(e: HandlerEntry): nat
      reads this
    {
      if e.cell in owners then owners[e.cell] else e.registrar
    }

    method RegisterHandler(trap: TrapType, e: HandlerEntry) returns (r: Option<Handle>)
      requires Valid() && e.priority < LEVELS
      modifies this
      ensures Valid() && (Abs(), r) == Register(old(Abs()), trap, e)
    {
      hide Represents;
      var h := Handle(e.description, trap);
      if h in handleMap { return None; }
      RegisterRepresents(handlers, regs, trap, e);
      handlers := handlers[trap := Push(Lists(handlers, trap), e.priority, e)];
      handleMap := handleMap[h := e];
      regs := regs + [Registration(trap, e)];
      return Some(h);
    }

    /** The first trap type, in declaration order, whose list of that priority mentions the description. */
    method FindTrapType(p: nat, d: string) returns (i: nat)
      requires Valid()
      ensures i == FirstType(regs, p, d)
    {
      hide Represents, FirstType;
      i := 0;
      FirstFrom(regs, p, d, 0);
      while i < TRAP_TYPES
        invariant i <= TRAP_TYPES && FirstType(regs, p, d, i) == FirstType(regs, p, d)
      {
        var trap := FromIndex(i).value;
        ListHasSlot(handlers, regs, trap, p, d);
        FirstFrom(regs, p, d, i);
        assert forall r | r in regs && Index(r.trap) == i :: r.trap == trap by {
          forall r | r in regs && Index(r.trap) == i ensures r.trap == trap { IndexInjective(r.trap, trap); }
        }
        if trap in handlers && p in handlers[trap] && HasDescription(handlers[trap][p], d) { return; }
        i := i + 1;
      }
      FirstFrom(regs, p, d, i);
    }

    /** `unregister`. */
    method UnregisterHandler(h: Handle, id: nat) returns (ok: bool)
      requires Valid()
      modifies this
      ensures Valid() && (Abs(), ok) == Unregister(old(Abs()), h, id)
    {
      hide Represents, FirstType, Without, RetainIn, DropEmpty, Index, FromIndex;
      if h !in handleMap { return false; }
      var e := handleMap[h];
      if !CanBeUnregisteredBy(e, CurrentOwner(e), id) { return false; }
      var i := FindTrapType(e.priority, e.description);
      if i >= TRAP_TYPES { return false; }
      var trap := FromIndex(i).value;
      ghost var regs' := Unregister(Abs(), h, id).0.regs;
      RemoveSlot(handlers, regs, regs', i, trap, e.priority, e.description);
      handlers := RetainIn(handlers, trap, e.priority, e.description);
      handlers := DropEmpty(handlers, trap, e.priority);
      handleMap := handleMap - {h};
      regs := regs';
      return true;
    }

    /** `transfer_ownership`: changes the owner in the shared cell. */
    method Transfer(h: Handle, current: nat, owner: nat) returns (ok: bool)
      requires Valid()
      modifies this`owners
      ensures Valid() && (Abs(), ok) == TransferOwnership(old(Abs()), h, current, owner)
    {
      hide Represents;
      if h !in handleMap { return false; }
      var e := handleMap[h];
      if CurrentOwner(e) != current && current != KERNEL { return false; }
      owners := owners[e.cell := owner];
      return true;
    }

    /** Takes a handle out of the map and its slot out of every trap type. */
    method DropHandle(h: Handle)
      requires Valid() && h in handleMap
      modifies this`handlers, this`handleMap, this`regs
      ensures Valid() && handleMap == old(handleMap) - {h}
      ensures regs == DropSlot(old(regs), old(handleMap)[h].priority, old(handleMap)[h].description)
    {
      hide Represents, DropSlot;
      var e := handleMap[h];
      handleMap := handleMap - {h};
      handlers := RetainEverywhere(handlers, regs, e.priority, e.description);
      DropKeepsBound(regs, e.priority, e.description);
      regs := DropSlot(regs, e.priority, e.description);
    }

    /** `unregister_for_context`: every handle of the context, one after the other. */
    method UnregisterContext(context: nat)
      requires Valid()
      modifies this
      ensures Valid() && Abs() == UnregisterForContext(old(Abs()), context)
    {
      hide Represents, Left, DropSlot, UnregisterForContext, Without, Registry.Doomed;
      ghost var t := Abs();
      var todo := set h | h in handleMap && handleMap[h].context == Some(context);
      ghost var done: set<Handle> := {};
      LeftAtFirst(t);
      while todo != {}
        invariant todo !! done && todo + done == HandlesOf(t, context)
        invariant handleMap == t.handles - done && owners == t.owners
        invariant Valid() && regs == Left(t, done)
        decreases |todo|
      {
        var h :| h in todo;
        OneMore(t, done, h);
        DropHandle(h);
        todo, done := todo - {h}, done + {h};
      }
      LeftAtLast(t, context);
      assert done == HandlesOf(t, context);
    }

    /** `dispatch`: list by list in priority order is the fold over the stably sorted handlers of the type. */
    method DispatchTrap(ctx: TrapContext) returns (ctx': TrapContext, result: TrapResult)
      requires Valid()
      ensures (ctx', result) == Dispatch(StableSort(OfType(regs, ToTrapType(ctx.scause)), EntryPriority), ctx)
    {
      hide StableSort, Represents, ToTrapType, OfType, Dispatch, Visit;
      var trap := ToTrapType(ctx.scause);
      ListsAreSorted(handlers, regs, trap);
      ghost var all := Visit(Lists(handlers, trap));
      ctx' := ctx;
      if trap in handlers {
        var lists := handlers[trap];
        for p := 0 to LEVELS
          invariant Dispatch(all, ctx) == Dispatch(Visit(lists, p), ctx')
        {
          VisitStep(lists, p);
          if p in lists {
            var list := lists[p];
            ghost var later := Visit(lists, p + 1);
            assert list[0..] == list;
            for i := 0 to |list|
              invariant Dispatch(all, ctx) == Dispatch(list[i..] + later, ctx')
            {
              DispatchHead(list, i, later, ctx');
              var (c, r) := list[i].run(ctx');
              ctx' := c;
              if r == TrapHandled { return ctx', TrapHandled; }
            }
            assert list[|list|..] + later == later;
          }
        }
        VisitStep(lists, LEVELS);
      } else {
        EmptyVisit<HandlerEntry>(0);
      }
      DispatchNone(ctx');
      result := Pass;
    }
  }

  /** In the slot of one of these handles. */
  ghost predicate DoomedBy(t: Table, done: set<Handle>, r: Registration) {
    exists h :: h in done && h in t.handles && SameSlot(r, t.handles[h].priority, t.handles[h].description)
  }

  /** The registrations left when these handles are gone. */
  ghost function Left(t: Table, done: set<Handle>): seq<Registration> {
    Without(t.regs, (r: Registration) => DoomedBy(t, done, r))
  }

  function DropSlot(regs: seq<Registration>, p: nat, d: string): seq<Registration> {
    Without(regs, (r: Registration) => SameSlot(r, p, d))
  }

  lemma {:induction false} NoneGone(regs: seq<Registration>, gone: Registration -> bool)
    requires forall r | r in regs :: !gone(r)
    ensures Without(regs, gone) == regs
  {
    if regs != [] {
      assert regs == [regs[0]] + regs[1..];
      NoneGone(regs[1..], gone);
    }
  }

  lemma LeftAtFirst(t: Table)
    ensures Left(t, {}) == t.regs
  {
    NoneGone(t.regs, (r: Registration) => DoomedBy(t, {}, r));
  }

  lemma LeftAtLast(t: Table, context: nat)
    ensures UnregisterForContext(t, context) ==
            t.(regs := Left(t, HandlesOf(t, context)), handles := t.handles - HandlesOf(t, context))
  {
    var done := HandlesOf(t, context);
    WithoutSame(t.regs, (r: Registration) => DoomedBy(t, done, r), (r: Registration) => Doomed(t, context, r));
  }

  lemma DropKeepsBound(regs: seq<Registration>, p: nat, d: string)
    ensures forall r | r in DropSlot(regs, p, d) :: r in regs
  {
  }

  lemma OneMore(t: Table, done: set<Handle>, h: Handle)
    requires h in t.handles
    ensures DropSlot(Left(t, done), t.handles[h].priority, t.handles[h].description) == Left(t, done + {h})
  {
    var e := t.handles[h];
    var f, g := (r: Registration) => DoomedBy(t, done, r), (r: Registration) => SameSlot(r, e.priority, e.description);
    var both := (r: Registration) => DoomedBy(t, done + {h}, r);
    forall r | r in t.regs ensures both(r) == (f(r) || g(r)) {
      if f(r) {
        var k :| k in done && k in t.handles && SameSlot(r, t.handles[k].priority, t.handles[k].description);
        assert k in done + {h};
      }
      if g(r) { assert h in done + {h}; }
    }
    WithoutTwice(t.regs, f, g, both);
  }

  /** Retains in the lists of one priority under every trap type. */
  method RetainEverywhere(m: TrapMap, ghost regs: seq<Registration>, p: nat, d: string) returns (m': TrapMap)
    requires Represents(m, regs)
    ensures Represents(m', DropSlot(regs, p, d))
  {
    hide Retain, Without;
    m' := m;
    for i := 0 to TRAP_TYPES
      invariant forall tt, q: nat :: Bucket(Lists(m', tt), q) ==
                  if Index(tt) < i && q == p then Retain(Bucket(Lists(m, tt), q), d) else Bucket(Lists(m, tt), q)
    {
      var trap := FromIndex(i).value;
      RetainLists(m', trap, p, d);
      forall tt | Index(tt) == i ensures tt == trap { IndexInjective(tt, trap); }
      m' := RetainIn(m', trap, p, d);
    }
    ghost var gone := (r: Registration) => SameSlot(r, p, d);
    forall tt, q: nat ensures Bucket(Lists(m', tt), q) == Pick(Without(regs, gone), tt, q) {
      PickWithoutAll(regs, gone, p, d, tt, q);
      assert Bucket(Lists(m, tt), q) == Pick(regs, tt, q);
    }
    WithoutSame(regs, gone, (r: Registration) => SameSlot(r, p, d));
  }

  lemma DispatchHead(list: seq<HandlerEntry>, i: nat, later: seq<HandlerEntry>, ctx: TrapContext)
    requires i < |list|
    ensures Dispatch(list[i..] + later, ctx) ==
            if list[i].run(ctx).1 == TrapHandled then (list[i].run(ctx).0, TrapHandled)
            else Dispatch(list[i + 1..] + later, list[i].run(ctx).0)
  {
    var s := list[i..] + later;
    assert s[0] == list[i] && s[1..] == list[i + 1..] + later;
  }

  lemma DispatchNone(ctx: TrapContext)
    ensures Dispatch([], ctx) == (ctx, Pass)
  {
  }

  lemma VisitStep<T>(b: Buckets<T>, p: nat)
    ensures Visit(b, p) == if p >= LEVELS then [] else if p in b then b[p] + Visit(b, p + 1) else Visit(b, p + 1)
  {
  }

  lemma EmptyVisit<T>(p: nat)
    ensures Visit<T>(map[], p) == []
    decreases LEVELS - p
  {
    if p < LEVELS { EmptyVisit<T>(p + 1); }
  }

  lemma ListsAreSorted(m: TrapMap, regs: seq<Registration>, trap: TrapType)
    requires Represents(m, regs) && forall r | r in regs :: r.entry.priority < LEVELS
    ensures Visit(Lists(m, trap)) == StableSort(OfType(regs, trap), EntryPriority)
  {
    var es := OfType(regs, trap);
    forall p: nat ensures Bucket(Lists(m, trap), p) == Of(es, EntryPriority, p) { PickIsOf(regs, trap, p); }
    OfTypeMembers(regs, trap);
    VisitIsSort(Lists(m, trap), es, EntryPriority);
  }

  lemma {:induction false} OfTypeMembers(regs: seq<Registration>, trap: TrapType)
    ensures forall e | e in OfType(regs, trap) :: Registration(trap, e) in regs
  {
    if regs != [] {
      OfTypeMembers(regs[1..], trap);
      assert regs == [regs[0]] + regs[1..];
    }
  }

  /** One step of the search for the first trap type. */
  lemma FirstFrom(regs: seq<Registration>, p: nat, d: string, i: nat)
    requires i <= TRAP_TYPES
    ensures i == TRAP_TYPES ==> FirstType(regs, p, d, i) == TRAP_TYPES
    ensures i < TRAP_TYPES && (exists r :: r in regs && SameSlot(r, p, d) && Index(r.trap) == i) ==>
              FirstType(regs, p, d, i) == i
    ensures i < TRAP_TYPES && (forall r | r in regs && SameSlot(r, p, d) :: Index(r.trap) != i) ==>
              FirstType(regs, p, d, i) == FirstType(regs, p, d, i + 1)
  {
  }

  lemma RemoveSlot(m: TrapMap, regs: seq<Registration>, regs': seq<Registration>, i: nat,
      trap: TrapType, p: nat, d: string)
    requires Represents(m, regs) && Index(trap) == i
    requires exists gone :: regs' == Without(regs, gone)
                            && forall r | r in regs :: gone(r) <==> Index(r.trap) == i && SameSlot(r, p, d)
    ensures Represents(DropEmpty(RetainIn(m, trap, p, d), trap, p), regs')
    ensures forall r | r in regs' :: r in regs
  {
    var gone :| regs' == Without(regs, gone)
                && forall r | r in regs :: gone(r) <==> Index(r.trap) == i && SameSlot(r, p, d);
    RetainLists(m, trap, p, d);
    RetainLists(RetainIn(m, trap, p, d), trap, p, d);
    var m' := DropEmpty(RetainIn(m, trap, p, d), trap, p);
    forall tt, q: nat ensures Bucket(Lists(m', tt), q) == Pick(regs', tt, q) {
      PickWithout(regs, gone, i, p, d, tt, q);
      if Index(tt) == i { IndexInjective(tt, trap); }
      assert Bucket(Lists(m, tt), q) == Pick(regs, tt, q);
    }
  }

  // ---------------------------------------------------------------- the trap system

  /** The report an unhandled trap causes: source trap, level critical, numbered by the cause. */
  function UnhandledTrap(ctx: TrapContext): SystemError {
    SystemError(NewCode(Trap, Critical, (Code(ctx.scause) % 0x1_0000) as bv16), Some(ctx.stval), ctx.sepc, 0)
  }

  /**
    What a report says of the trap: source trap, level critical, the low 16 bits of the cause's code as its
    number, the trap value as the address and the saved program counter as the instruction pointer.
   */
  predicate Describes(e: SystemError, ctx: TrapContext) {
    && e.code.Source() == Trap && e.code.Level() == Critical
    && e.code.Number() == (Code(ctx.scause) % 0x1_0000) as bv16
    && e.address == Some(ctx.stval) && e.ip == ctx.sepc && e.timestamp == 0
  }

  lemma UnhandledIsCritical(ctx: TrapContext)
    ensures Describes(UnhandledTrap(ctx), ctx) && !UnhandledTrap(ctx).code.IsFatal()
  {
    hide NewCode, ErrorCode.Source, ErrorCode.Level, ErrorCode.Number, ErrorCode.IsFatal;
    PackUnpack(Trap, Critical, (Code(ctx.scause) % 0x1_0000) as bv16);
  }

  class TrapSystem {
    const handlers: HeapHandlerManager
    const errors: EM.HeapErrorManager

    ghost predicate Valid()
      reads this, handlers, errors, errors.log, errors.log.buffer
    {
      handlers.Valid() && errors.Valid()
    }

    constructor (handlers: HeapHandlerManager, errors: EM.HeapErrorManager)
      requires handlers.Valid() && errors.Valid()
      ensures Valid() && this.handlers == handlers && this.errors == errors
    {
      this.handlers, this.errors := handlers, errors;
    }

    /**
      `handle_trap`: the trap is either handled, and nothing is reported, or it causes exactly one report of
      source trap and level critical. It never turns panic mode on.
     */
    method HandleTrap(ctx: TrapContext) returns (ctx': TrapContext, ghost result: TrapResult)
      requires Valid()
      modifies errors`panicMode, errors`reported, errors.log, errors.log.buffer
      ensures Valid()
      ensures (ctx', result) ==
              Dispatch(StableSort(OfType(handlers.regs, ToTrapType(ctx.scause)), EntryPriority), ctx)
      ensures result == TrapHandled ==> errors.Abs() == old(errors.Abs())
      ensures result != TrapHandled ==> errors.Abs() == EM.ReportStep(old(errors.Abs()), UnhandledTrap(ctx'))
      ensures result != TrapHandled ==>
                && |errors.reported| == |old(errors.reported)| + 1
                && errors.reported[..|old(errors.reported)|] == old(errors.reported)
                && Describes(errors.reported[|old(errors.reported)|].error, ctx')
      ensures errors.panicMode == old(errors.panicMode)
    {
      hide StableSort, Represents, LastN, NewCode;
      var r: TrapResult;
      ctx', r := handlers.DispatchTrap(ctx);
      result := r;
      match r {
        case TrapHandled =>
        case Pass =>
          UnhandledIsCritical(ctx');
          var _ := errors.HandleError(UnhandledTrap(ctx'));
        case Failed(_) =>
          assert false;
      }
    }
  }
}
